/** A table as the process has it open: the pager, the columns, and the root
    page kept in memory beside the one stored on page 0. */
module TableStores {
  import opened Bytes
  import opened Cells
  import opened Results
  import opened WalLog
  import opened Media
  import opened PageCache
  import Codec
  import opened Rows
  import opened Metadata
  import opened TreeModel
  import TreeOrder
  import opened TreeChain
  import TreePages
  import opened TreeRuns
  import opened TreeReach
  import Crash
  import opened Nodes
  import opened BTree
  import BTreeScan
  import opened Tables

  /** write_metadata through the cache. */
  method PutMetadata(pager: Pager, root: nat, cols: seq<Column>) returns (ghost meta: Page)
    requires pager.Valid() && 0 < |pager.View()| && MetaFits(cols)
    modifies pager
    ensures pager.Valid() && SameFile(pager)
    ensures pager.View() == old(pager.View())[0 := meta] && Codec.Holds(meta, 0, MetaBytes(root, cols))
  {
    hide MetaBytes;
    var b := pager.GetPageMut(0);
    var a := b.value;
    ghost var s0 := a[..];
    WriteMetadata(a, root, cols);
    meta := a[..];
    WrittenHolds(meta, s0[|MetaBytes(root, cols)|..], root, cols);
    pager.Store(0, a);
  }

  function Names(cols: seq<Column>): (names: seq<seq<byte>>)
    ensures |names| == |cols| && forall i :: 0 <= i < |names| ==> names[i] == cols[i].name
  {
    seq(|cols|, i requires 0 <= i < |cols| => cols[i].name)
  }

  lemma EmptyTable(v: seq<Page>, root: nat, cols: seq<Column>)
    requires 0 < root < |v| <= MAX_PAGES && MetaFits(cols) && Codec.Holds(v[0], 0, MetaBytes(root, cols))
    requires Represents(v, Leaf(root, [], 0)) && root + 1 == |v|
    ensures TableOk(v, root, cols, Fresh(root)) && TreeOrder.Cat(Fresh(root).ch) == []
  {
    hide NodeOf, Index, Loose, Codec.Holds, MetaBytes;
    StartIsIndex(root);
    IndexIsLoose(Start(root).t, Start(root).ch, 0, |v|);
    assert Loose(Start(root).t, Start(root).ch, 0, |v|);
  }

  /** Writing page 0 leaves the new root where it is. */
  lemma RootApart(v: seq<Page>, root: nat, meta: Page)
    requires Represents(v, Leaf(root, [], 0)) && 0 < root
    ensures 0 < |v| && Represents(v[0 := meta], Leaf(root, [], 0))
  {
    hide NodeOf;
  }

  class Table {
    const pager: Pager
    var columns: seq<Column>
    var rootPage: nat
    /** The index that the file holds, and the one that the view holds. */
    ghost var durable: Snapshot
    ghost var live: Snapshot

    ghost predicate Valid()
      reads this, pager, pager.wal
    {
      && pager.Valid()
      && TableOk(pager.disk, durable.t.page, columns, durable)
      && TableOk(pager.View(), rootPage, columns, live)
      && WalLog.Recovered(pager.wal.file) == []
    }

    /** The rows a scan returns now. */
    ghost function Rows(): seq<seq<Value>>
      reads this
    {
      Contents(columns, TreeOrder.Cat(live.ch))
    }

    /** The rows the file holds. */
    ghost function DurableRows(): seq<seq<Value>>
      reads this
    {
      Contents(columns, TreeOrder.Cat(durable.ch))
    }

    constructor Made(p: Pager, cols: seq<Column>, root: nat, ghost s: Snapshot)
      ensures pager == p && columns == cols && rootPage == root && live == durable == s
    {
      pager, columns, rootPage := p, cols, root;
      durable, live := s, s;
    }

    /** open_table: replay the log, then read the metadata; of a file whose
        page 0 runs no column past its end. If the replayed pages hold the table
        s, that is the table. */
    static method OpenTable(db: DbFile, log: seq<byte>, ghost cols: seq<Column>, ghost s: Snapshot) returns (r: Result<Table>)
      requires db.rest == [] ==> ParseMeta(At(Replay(db.pages, WalLog.Recovered(log)), 0)).Some?
      ensures db.rest != [] ==> r == Err(CorruptFile)
      ensures db.rest == [] ==>
        var v := Replay(db.pages, WalLog.Recovered(log));
        match ParseMeta(At(v, 0)).value
        case Err(e) => r == Err(e)
        case Ok((root, cs)) =>
          && r.Ok? && fresh(r.value) && fresh(r.value.pager) && fresh(r.value.pager.wal)
          && r.value.columns == cs && r.value.rootPage == root
          && r.value.pager.View() == r.value.pager.disk == v && !r.value.pager.inTransaction
          && (TableOk(v, s.t.page, cols, s) ==>
               && r.value.Valid() && r.value.columns == CutAll(cols) && r.value.live == r.value.durable == s
               && r.value.Rows() == Contents(cols, TreeOrder.Cat(s.ch)))
    {
      hide TableOk, ParseMeta, Replay, Recovered, Consistent, Contents, TreeOrder.Cat;
      var p := Pager.OpenFile(db, log);
      if p.Err? {
        return Err(CorruptFile);
      }
      Crash.EmptyLog();
      ghost var v := p.value.View();
      var page := p.value.ReadPage(0);
      var m := ReadMetadata(page.value);
      if m.Err? {
        return Err(m.error);
      }
      var t := new Table.Made(p.value, m.value.1, m.value.0, s);
      if TableOk(v, s.t.page, cols, s) {
        PageZero(v, s.t.page, cols, s);
        MetaOnPage(v, s.t.page, cols, s);
      }
      r := Ok(t);
    }

    /** create_table: metadata and an empty leaf on new pages, flushed at once;
        ops is the I/O of the flush. */
    static method CreateTable(db: DbFile, log: seq<byte>, cols: seq<Column>) returns (r: Result<Table>, ghost ops: seq<IoOp>)
      requires MetaFits(cols)
      ensures db.rest != [] ==> r == Err(CorruptFile)
      ensures db.rest == [] && |Replay(db.pages, WalLog.Recovered(log))| > MAX_PAGES - 2 ==> r == Err(PageLimit)
      ensures db.rest == [] && |Replay(db.pages, WalLog.Recovered(log))| <= MAX_PAGES - 2 ==>
        && r.Ok? && fresh(r.value) && fresh(r.value.pager) && fresh(r.value.pager.wal)
        && r.value.Valid() && !r.value.pager.inTransaction && r.value.pager.Clean()
        && r.value.columns == cols && r.value.Rows() == []
        && 0 < r.value.rootPage && r.value.live == r.value.durable == Fresh(r.value.rootPage)
        && |r.value.pager.View()| == |r.value.pager.disk| == r.value.rootPage + 1 <= MAX_PAGES
        && r.value.pager.wal.file == []
        && CommitsTo(Replay(db.pages, WalLog.Recovered(log)), r.value.pager.disk, 0, ops)
    {
      hide Codec.Holds, MetaBytes, Represents, Replay, Recovered, MetaFits, Consistent, TableOk, CommitsTo;
      ops := [];
      var file := Pager.OpenFile(db, log);
      if file.Err? {
        return Err(CorruptFile), [];
      }
      var p := file.value;
      var q := p.AllocatePage();
      if q.Err? {
        return Err(PageLimit), [];
      }
      var root := CreateTree(p);
      if root.Err? {
        return Err(PageLimit), [];
      }
      ghost var v := p.View();
      ghost var meta := PutMetadata(p, root.value, cols);
      RootApart(v, root.value, meta);
      ops := p.Commit();
      Crash.EmptyLog();
      EmptyTable(p.View(), root.value, cols);
      var t := new Table.Made(p, cols, root.value, Fresh(root.value));
      r := Ok(t);
    }

    /** The B+tree step of an insertion, and the new root in the metadata. */
    method Put(key: i64, row: seq<byte>) returns (r: Result<()>)
      requires Valid()
      requires Cost(Cell(key, row)) <= LEAF_CAPACITY && ParseRow(row, 0, columns).Some?
      requires Accepts(live, Cell(key, row))
      modifies pager, this`rootPage, this`live
      ensures pager.Valid() && SameFile(pager) && TableOk(pager.View(), rootPage, columns, live)
      ensures var c, n := Cell(key, row), |old(pager.View())|;
        if NextFree(old(live), c, n) <= MAX_PAGES then
          r == Ok(()) && live == After(old(live), c, n) && |pager.View()| == NextFree(old(live), c, n)
        else if n == MAX_PAGES then
          r == Err(PageLimit) && live == old(live) && rootPage == old(rootPage)
          && pager.View() == old(pager.View()) && pager.dirty == old(pager.dirty)
        else
          r == Err(PageLimit) && live == Torn(old(live), c, n) && rootPage == old(rootPage)
          && |pager.View()| == MAX_PAGES
    {
      hide TableOk, Represents, InsertRoot, ChainAfter, TargetLeaf, ParseRow, TreePages.Uses, Wf, Splittable,
        Inserted, Consistent, OnlyPath, PiecesStored, HalfInserted, StuntedRoot, Reaches;
      ghost var c, v0 := Cell(key, row), pager.View();
      TableTree(v0, rootPage, columns, live, c);
      var newRoot := InsertRow(pager, rootPage, key, row, live.t);
      ghost var v1 := pager.View();
      if newRoot.Err? {
        if |v0| < MAX_PAGES {
          TornStored(v0, v1, rootPage, columns, live, c);
          AllPagesUsed(v0, v1, live.t, c);
          live := Torn(live, c, |v0|);
        }
        return Err(PageLimit);
      }
      InsertedPages(v0, v1, live.t, c);
      SameRoot(v0, v1, rootPage, columns, live, c);
      ghost var old0 := rootPage;
      if newRoot.value != rootPage {
        rootPage := newRoot.value;
        ghost var meta := PutMetadata(pager, rootPage, columns);
        NewRootStored(v0, v1, old0, columns, live, c, meta);
      }
      live := After(live, c, |v0|);
      r := Ok(());
    }

    /** insert: checks, key, bytes, B+tree, and a flush outside transactions;
        ops is the I/O of the flush. */
    method Insert(values: seq<Value>) returns (r: Result<()>, ghost ops: seq<IoOp>)
      requires Valid()
      requires Conforms(columns, values) && |RowBytes(columns, values)| <= MAX_ROW ==> Accepts(live, CellFor(columns, values))
      modifies this, pager, pager.wal
      ensures Valid() && columns == old(columns) && pager.inTransaction == old(pager.inTransaction)
      ensures |values| != |columns| ==> r == Err(WrongArity)
      ensures |values| == |columns| && !Conforms(columns, values) ==> r == Err(WrongType)
      ensures Conforms(columns, values) && |RowBytes(columns, values)| > MAX_ROW ==> r == Err(RowTooLarge)
      ensures Conforms(columns, values) && |RowBytes(columns, values)| <= MAX_ROW ==>
        r == if NextFree(old(live), CellFor(columns, values), |old(pager.View())|) > MAX_PAGES then Err(PageLimit) else Ok(())
      ensures r == Err(PageLimit) ==> |old(pager.View())| + 3 > MAX_PAGES && !RoomFor(old(live), CellFor(columns, values))
      ensures r.Ok? ==>
        && live == After(old(live), CellFor(columns, values), |old(pager.View())|)
        && |pager.View()| == NextFree(old(live), CellFor(columns, values), |old(pager.View())|)
      ensures r.Ok? && !pager.inTransaction ==>
        && durable == live && pager.Clean() && pager.disk == pager.View() && pager.wal.file == []
        && CommitsTo(old(pager.disk), pager.View(), old(pager.wal.txnId), ops)
      ensures r.Err? || pager.inTransaction ==>
        durable == old(durable) && pager.disk == old(pager.disk) && pager.wal.file == old(pager.wal.file) && ops == []
      ensures r == Err(PageLimit) && |old(pager.View())| < MAX_PAGES ==>
        live == Torn(old(live), CellFor(columns, values), |old(pager.View())|) && |pager.View()| == MAX_PAGES
      ensures r.Err? && (r == Err(PageLimit) ==> |old(pager.View())| == MAX_PAGES) ==>
        live == old(live) && rootPage == old(rootPage) && pager.View() == old(pager.View()) && pager.dirty == old(pager.dirty)
    {
      hide TableOk, RowBytes, ParseRow, Conforms, Accepts, After, Torn, NextFree, Consistent, CommitsTo, Recovered;
      ops := [];
      if |values| != |columns| {
        NotConforming(columns, values);
        return Err(WrongArity), [];
      }
      var ok := TypeCheck(columns, values);
      if !ok {
        return Err(WrongType), [];
      }
      var key := ExtractKey(columns, values);
      var rsize := SerializedSize(columns, values);
      if rsize > MAX_ROW {
        return Err(RowTooLarge), [];
      }
      var buf := new byte[rsize];
      Serialize(columns, values, buf);
      assert buf[..] == RowBytes(columns, values);
      StoredRow(columns, values);
      EnoughPages(pager.View(), rootPage, columns, live, CellFor(columns, values));
      r := Put(key, buf[..]);
      if r.Err? {
        return;
      }
      if !pager.inTransaction {
        ops := pager.Commit();
        durable := live;
        Crash.EmptyLog();
        TableRoot(pager.View(), rootPage, columns, live);
      }
    }

    /** select_all: the column names and the decoded rows. */
    method SelectAll() returns (headers: seq<seq<byte>>, rows: seq<seq<Value>>)
      requires Valid()
      modifies pager
      ensures Valid() && SameFile(pager) && pager.View() == old(pager.View()) && pager.dirty == old(pager.dirty)
      ensures headers == Names(columns) && rows == Rows()
    {
      hide TableOk, Represents, ParseRow, TreeOrder.Cat, Wf, TreePages.Owns, Consistent, Recovered, Linked,
        BTreeScan.ChainStored, NonZero, Leaves;
      TableTree(pager.View(), rootPage, columns, live, Cell(0, []));
      ghost var cs := TreeOrder.Cat(live.ch);
      TableRows(pager.View(), rootPage, columns, live);
      var raw := BTreeScan.ScanAll(pager, rootPage, live.t, live.ch);
      headers := Names(columns);
      rows := [];
      for i := 0 to |raw.value|
        invariant |rows| == i && forall j :: 0 <= j < i ==> rows[j] == ValueRow(columns, cs[j])
        invariant Valid() && SameFile(pager) && pager.View() == old(pager.View()) && pager.dirty == old(pager.dirty)
      {
        assert ParseRow(cs[i].row, 0, columns).Some?;
        var row := Deserialize(raw.value[i], columns);
        rows := rows + [row];
      }
      assert rows == Contents(columns, cs);
    }

    method Begin() returns (r: Result<()>)
      requires Valid()
      modifies pager
      ensures Valid() && pager.inTransaction && SameTable()
      ensures pager.disk == old(pager.disk) && pager.View() == old(pager.View()) && pager.dirty == old(pager.dirty)
      ensures r == if old(pager.inTransaction) then Err(InTransaction) else Ok(())
    {
      hide TableOk, Consistent, Recovered;
      r := pager.Begin();
    }

    twostate predicate SameTable()
      reads this
    {
      columns == old(columns) && rootPage == old(rootPage) && durable == old(durable) && live == old(live)
    }

    /** commit: what the transaction saw becomes what the file holds. */
    method Commit() returns (ghost ops: seq<IoOp>)
      requires Valid()
      modifies this, pager, pager.wal
      ensures Valid() && !pager.inTransaction && pager.Clean()
      ensures columns == old(columns) && rootPage == old(rootPage)
      ensures live == old(live) == durable && pager.disk == pager.View() == old(pager.View())
      ensures pager.wal.file == []
      ensures CommitsTo(old(pager.disk), old(pager.View()), old(pager.wal.txnId), ops)
    {
      hide TableOk, Consistent, CommitsTo, Recovered;
      ops := pager.Commit();
      durable := live;
      Crash.EmptyLog();
      TableRoot(pager.View(), rootPage, columns, live);
    }

    /** rollback: discard the dirty pages and read the root page back. */
    method Rollback()
      requires Valid()
      modifies this, pager, pager.wal
      ensures Valid() && !pager.inTransaction && pager.Clean()
      ensures columns == old(columns) && durable == old(durable) && live == durable
      ensures rootPage == durable.t.page && pager.View() == pager.disk == old(pager.disk)
      ensures pager.wal.file == []
    {
      hide TableOk, ParseMeta, Consistent, Recovered;
      ghost var _ := pager.Rollback();
      Crash.EmptyLog();
      MetaOnPage(pager.View(), durable.t.page, columns, durable);
      PageZero(pager.View(), durable.t.page, columns, durable);
      var page := pager.ReadPage(0);
      var m := ReadMetadata(page.value);
      rootPage := m.value.0;
      live := durable;
    }
  }

  lemma NotConforming(cols: seq<Column>, vals: seq<Value>)
    requires |cols| != |vals|
    ensures !Conforms(cols, vals)
  {
  }

  lemma PageZero(v: seq<Page>, root: nat, cols: seq<Column>, s: Snapshot)
    requires TableOk(v, root, cols, s)
    ensures 0 < |v| <= MAX_PAGES && At(v, 0) == v[0]
  {
  }

  lemma TableRows(v: seq<Page>, root: nat, cols: seq<Column>, s: Snapshot)
    requires TableOk(v, root, cols, s)
    ensures Decodable(cols, TreeOrder.Cat(s.ch))
  {
  }

  /** What the B+tree operations need of a table. */
  lemma TableTree(v: seq<Page>, root: nat, cols: seq<Column>, s: Snapshot, c: Cell)
    requires TableOk(v, root, cols, s)
    ensures 0 < |v| <= MAX_PAGES && MetaFits(cols) && s.t.page == root && Represents(v, s.t) && BTreeScan.ChainStored(v, s.ch)
    ensures Wf(s.t) && Unshared(s.t) && Reaches(s.t, s.ch, |v|) && TargetLeaf(s.t, c.key) in s.ch
  {
    hide Represents, Shaped, Wf, TreePages.Owns, Reaches, TargetLeaf, BTreeScan.ChainStored;
    ShapedWf(s, c, |v|);
  }

  lemma InsertedPages(v0: seq<Page>, v1: seq<Page>, t: Tree, c: Cell)
    requires Wf(t) && Inserted(v0, v1, t, c)
    ensures |v1| == InsertRoot(t, c, |v0|).1 && |v0| <= |v1|
  {
    hide InsertRoot, OnPath;
  }

  lemma AllPagesUsed(v0: seq<Page>, v1: seq<Page>, t: Tree, c: Cell)
    requires Wf(t) && HalfInserted(v0, v1, t, c)
    ensures |v1| == MAX_PAGES
  {
    hide Represents, StuntedRoot;
  }

  lemma EnoughPages(v: seq<Page>, root: nat, cols: seq<Column>, s: Snapshot, c: Cell)
    requires TableOk(v, root, cols, s)
    ensures NextFree(s, c, |v|) <= |v| + 3
    ensures RoomFor(s, c) ==> NextFree(s, c, |v|) <= MAX_PAGES
  {
    hide Represents, Shaped, NextFree, BTreeScan.ChainStored, RoomFor;
    RoomForGrowth(s, c, |v|);
    RoomTakesNoPage(s, c, |v|);
  }
}
