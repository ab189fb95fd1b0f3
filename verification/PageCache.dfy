/** The pager: a page cache over the file, dirty pages, the log, and the two
    ways a transaction ends. */
module PageCache {
  import opened Bytes
  import opened Cells
  import opened Results
  import opened WalLog
  import opened Media
  import WalFile

  const MAX_PAGES: int := 1024

  type Slot = Option<Page>

  /** What the cache holds of the file, and which pages are dirty. Lengths are
      in pages. */
  ghost predicate Consistent(disk: seq<Page>, fileLength: nat, pages: seq<Slot>, dirty: seq<bool>) {
    && |pages| == |dirty| == MAX_PAGES
    && |disk| <= fileLength
    && (forall i :: 0 <= i < MAX_PAGES && dirty[i] ==> pages[i].Some? && i < fileLength)
    && (forall i :: 0 <= i < MAX_PAGES && pages[i].Some? && !dirty[i] ==> pages[i].value == At(disk, i))
    && (|disk| < fileLength ==> fileLength <= MAX_PAGES)
    && (forall i :: |disk| <= i < fileLength && i < MAX_PAGES ==> dirty[i])
  }

  /** Page i as the transaction sees it. */
  ghost function Visible(disk: seq<Page>, pages: seq<Slot>, i: nat): Page {
    if i < |pages| && pages[i].Some? then pages[i].value else At(disk, i)
  }

  ghost function ViewOf(disk: seq<Page>, fileLength: nat, pages: seq<Slot>): (v: seq<Page>)
    ensures |v| == fileLength && forall i :: 0 <= i < |v| ==> v[i] == Visible(disk, pages, i)
  {
    seq(fileLength, i requires 0 <= i => Visible(disk, pages, i))
  }

  /** The dirty pages below n, in page order. */
  function DirtyWrites(pages: seq<Slot>, dirty: seq<bool>, n: nat): seq<Write>
    requires n <= |pages| == |dirty|
  {
    if n == 0 then []
    else
      DirtyWrites(pages, dirty, n - 1)
      + if dirty[n - 1] && pages[n - 1].Some? then [Write(n - 1, pages[n - 1].value)] else []
  }

  lemma {:induction false} DirtyWritesPages(pages: seq<Slot>, dirty: seq<bool>, n: nat)
    requires n <= |pages| == |dirty|
    ensures forall w :: w in DirtyWrites(pages, dirty, n) ==> w.page < n
    ensures forall w :: w in DirtyWrites(pages, dirty, n) ==> dirty[w.page] && pages[w.page] == Some(w.data)
  {
    if n > 0 {
      DirtyWritesPages(pages, dirty, n - 1);
    }
  }

  lemma ReplayOne(db: seq<Page>, w: Write)
    ensures Replay(db, [w]) == WriteAt(db, w)
  {
    assert Replay(db, [w]) == Replay(WriteAt(db, w), []);
  }

  /** r is the file after the dirty pages below n were written. */
  ghost predicate Written(disk: seq<Page>, fileLength: nat, pages: seq<Slot>, n: nat, r: seq<Page>) {
    && |r| == Max(|disk|, Min(n, fileLength))
    && forall i :: 0 <= i < |r| ==> r[i] == if i < n then Visible(disk, pages, i) else At(disk, i)
  }

  function Max(a: nat, b: nat): nat {
    if a < b then b else a
  }

  function Min(a: nat, b: nat): nat {
    if a < b then a else b
  }

  lemma WrittenNext(disk: seq<Page>, fileLength: nat, pages: seq<Slot>, dirty: seq<bool>, n: nat, r: seq<Page>)
    requires Consistent(disk, fileLength, pages, dirty) && n < MAX_PAGES && Written(disk, fileLength, pages, n, r)
    ensures if dirty[n] then Written(disk, fileLength, pages, n + 1, WriteAt(r, Write(n, pages[n].value)))
            else Written(disk, fileLength, pages, n + 1, r)
  {
    if dirty[n] {
      var r' := WriteAt(r, Write(n, pages[n].value));
      assert n <= |r|;
      forall i | 0 <= i < |r'| ensures r'[i] == if i < n + 1 then Visible(disk, pages, i) else At(disk, i) {
        assert i != n ==> r'[i] == r[i];
      }
    } else {
      assert !(|disk| <= n < fileLength);
      assert Visible(disk, pages, n) == At(disk, n);
    }
  }

  lemma {:induction false} DirtyReplayed(disk: seq<Page>, fileLength: nat, pages: seq<Slot>, dirty: seq<bool>, n: nat)
    requires Consistent(disk, fileLength, pages, dirty) && n <= MAX_PAGES
    ensures Written(disk, fileLength, pages, n, Replay(disk, DirtyWrites(pages, dirty, n)))
  {
    if n > 0 {
      DirtyReplayed(disk, fileLength, pages, dirty, n - 1);
      var ws := DirtyWrites(pages, dirty, n - 1);
      WrittenNext(disk, fileLength, pages, dirty, n - 1, Replay(disk, ws));
      hide Written, WriteAt;
      if dirty[n - 1] {
        var w := Write(n - 1, pages[n - 1].value);
        ReplayAppend(disk, ws, [w]);
        ReplayOne(Replay(disk, ws), w);
      } else {
        assert ws + [] == ws;
      }
    }
  }

  /** Writing all dirty pages makes the file equal the view. */
  lemma DirtyMakesView(disk: seq<Page>, fileLength: nat, pages: seq<Slot>, dirty: seq<bool>)
    requires Consistent(disk, fileLength, pages, dirty)
    ensures Replay(disk, DirtyWrites(pages, dirty, MAX_PAGES)) == ViewOf(disk, fileLength, pages)
  {
    hide Replay, DirtyWrites;
    DirtyReplayed(disk, fileLength, pages, dirty, MAX_PAGES);
    var r := Replay(disk, DirtyWrites(pages, dirty, MAX_PAGES));
    assert |r| == fileLength;
    assert r == ViewOf(disk, fileLength, pages);
  }

  /** The I/O of a commit that brings the file from disk to view. */
  ghost predicate CommitsTo(disk: seq<Page>, view: seq<Page>, txn: nat, ops: seq<IoOp>) {
    exists fileLength: nat, pages: seq<Slot>, dirty: seq<bool> ::
      && Consistent(disk, fileLength, pages, dirty)
      && view == ViewOf(disk, fileLength, pages)
      && ops == CommitOps(txn, DirtyWrites(pages, dirty, MAX_PAGES))
  }

  type Tail = s: seq<byte> | |s| < PAGE_SIZE

  /** A page file as found on disk: whole pages, and the bytes behind them. */
  datatype DbFile = DbFile(pages: seq<Page>, rest: Tail)

  /** Crash recovery on open: write the recovered pages in log order, sync,
      then empty the log; leave everything alone if there are none. */
  method ReplayLog(db: seq<Page>, w: WalFile.Wal) returns (file: seq<Page>, ghost ops: seq<IoOp>)
    modifies w
    ensures ops == RecoveryOps(old(w.file))
    ensures file == Replay(db, Recovered(old(w.file)))
    ensures w.file == (if Recovered(old(w.file)) == [] then old(w.file) else []) && w.txnId == old(w.txnId)
  {
    hide Replay, WriteAt, Recovered;
    var records := w.Recover();
    file := db;
    ops := [];
    NoWrites(db);
    if records != [] {
      ApplyNone();
      for i := 0 to |records|
        invariant file == Replay(db, records[..i]) && w.file == old(w.file) && w.txnId == old(w.txnId)
        invariant ops == ApplyOps(records[..i])
      {
        assert records[..i + 1] == records[..i] + [records[i]];
        ReplayAppend(db, records[..i], [records[i]]);
        ReplayOne(file, records[i]);
        ApplyOneMore(records[..i], records[i]);
        file := WriteAt(file, records[i]);
        ops := ops + [DbWrite(records[i])];
      }
      assert records[..|records|] == records;
      ghost var op := w.Truncate();
      ops := ops + [DbSync, op];
    }
  }

  class Pager {
    var disk: seq<Page>
    var fileLength: nat
    var pages: seq<Slot>
    var dirty: seq<bool>
    const wal: WalFile.Wal
    var inTransaction: bool

    ghost predicate Valid()
      reads this
    {
      Consistent(disk, fileLength, pages, dirty)
    }

    /** The pages as the open transaction sees them. */
    ghost function View(): (v: seq<Page>)
      reads this
      ensures |v| == fileLength
    {
      ViewOf(disk, fileLength, pages)
    }

    ghost predicate Clean()
      reads this
    {
      forall i :: 0 <= i < |dirty| ==> !dirty[i]
    }

    /** Open the files; what the log has committed is replayed first. */
    constructor Open(db: seq<Page>, log: seq<byte>)
      ensures Valid() && Clean() && !inTransaction && fresh(wal)
      ensures disk == Replay(db, Recovered(log)) && View() == disk
      ensures wal.file == (if Recovered(log) == [] then log else []) && wal.txnId == 0
    {
      var w := new WalFile.Wal(log);
      var file, _ := ReplayLog(db, w);
      wal := w;
      disk := file;
      fileLength := |file|;
      pages := seq(MAX_PAGES, _ => None);
      dirty := seq(MAX_PAGES, _ => false);
      inTransaction := false;
    }

    /** Pager::open: a file that does not end with a whole page is refused
        before the log is even looked at. */
    static method OpenFile(db: DbFile, log: seq<byte>) returns (r: Result<Pager>)
      ensures db.rest != [] ==> r == Err(CorruptFile)
      ensures db.rest == [] ==> r.Ok? && fresh(r.value) && fresh(r.value.wal)
      ensures r.Ok? ==>
        var p := r.value;
        && p.Valid() && p.Clean() && !p.inTransaction
        && p.disk == p.View() == Replay(db.pages, Recovered(log))
        && p.wal.file == (if Recovered(log) == [] then log else []) && p.wal.txnId == 0
    {
      var length := |db.pages| * PAGE_SIZE + |db.rest|;
      if length % PAGE_SIZE != 0 {
        return Err(CorruptFile);
      }
      var p := new Pager.Open(db.pages, log);
      r := Ok(p);
    }

    /** num_pages */
    function NumPages(): nat
      reads this
    {
      fileLength
    }

    /** A copy of a page; a miss fills the cache, which changes nothing visible. */
    method ReadPage(n: nat) returns (r: Result<Page>)
      requires Valid()
      modifies this
      ensures Valid() && View() == old(View()) && disk == old(disk) && dirty == old(dirty) && inTransaction == old(inTransaction)
      ensures r == if n < MAX_PAGES then Ok(At(View(), n)) else Err(PageLimit)
      ensures n < MAX_PAGES ==> pages[n].Some?
    {
      if n >= MAX_PAGES {
        return Err(PageLimit);
      }
      if pages[n].Some? {
        return Ok(pages[n].value);
      }
      var buf := ZeroPage();
      if n + 1 <= fileLength {
        buf := disk[n];
      }
      pages := pages[n := Some(buf)];
      r := Ok(buf);
      assert View() == old(View());
    }

    /** get_page_mut: the page, marked dirty; asking for the page just past the
        end extends the file. The caller writes the buffer back with Store. */
    method GetPageMut(n: nat) returns (r: Result<array<byte>>)
      requires Valid() && n <= fileLength
      modifies this
      ensures Valid() && disk == old(disk) && inTransaction == old(inTransaction)
      ensures n >= MAX_PAGES ==> r == Err(PageLimit) && View() == old(View()) && dirty == old(dirty)
      ensures n < MAX_PAGES ==>
        && r.Ok? && fresh(r.value)
        && r.value[..] == At(old(View()), n)
        && dirty == old(dirty)[n := true]
        && View() == if n < |old(View())| then old(View()) else old(View()) + [ZeroPage()]
    {
      var p := ReadPage(n);
      if p.Err? {
        return Err(PageLimit);
      }
      if n + 1 > fileLength {
        fileLength := n + 1;
      }
      dirty := dirty[n := true];
      var a := new byte[PAGE_SIZE];
      Copy(a, 0, p.value);
      assert a[..] == a[0..0 + |p.value|];
      r := Ok(a);
      assert View() == if n < |old(View())| then old(View()) else old(View()) + [ZeroPage()];
    }

    /** The end of a mutable borrow. */
    method Store(n: nat, a: array<byte>)
      requires Valid() && n < fileLength && n < MAX_PAGES && dirty[n] && a.Length == PAGE_SIZE
      modifies this
      ensures Valid() && disk == old(disk) && dirty == old(dirty) && inTransaction == old(inTransaction)
      ensures View() == old(View())[n := a[..]]
    {
      pages := pages[n := Some(a[..])];
      assert View() == old(View())[n := a[..]];
    }

    /** allocate_page: the first page past the end, zeroed. */
    method AllocatePage() returns (r: Result<nat>)
      requires Valid()
      modifies this
      ensures Valid() && disk == old(disk) && inTransaction == old(inTransaction)
      ensures |old(View())| >= MAX_PAGES ==> r == Err(PageLimit) && View() == old(View()) && dirty == old(dirty)
      ensures |old(View())| < MAX_PAGES ==>
        r == Ok(|old(View())|) && View() == old(View()) + [ZeroPage()] && dirty == old(dirty)[|old(View())| := true]
    {
      var n := NumPages();
      var p := GetPageMut(n);
      if p.Err? {
        return Err(PageLimit);
      }
      r := Ok(n);
    }

    method Begin() returns (r: Result<()>)
      requires Valid()
      modifies this
      ensures Valid() && View() == old(View()) && disk == old(disk) && dirty == old(dirty)
      ensures r == if old(inTransaction) then Err(InTransaction) else Ok(())
      ensures inTransaction
    {
      if inTransaction {
        return Err(InTransaction);
      }
      inTransaction := true;
      r := Ok(());
    }

    /** The logging half of commit, up to the durable marker. */
    method LogDirty() returns (ghost ops: seq<IoOp>)
      requires Valid()
      modifies wal
      ensures wal.txnId == old(wal.txnId) + 1
      ensures ops == LogOps(old(wal.txnId), DirtyWrites(pages, dirty, MAX_PAGES))
    {
      hide PageBytes, CommitBytes;
      ops := [];
      assert AppendOps(wal.txnId, []) == [];
      for i := 0 to MAX_PAGES
        invariant wal.txnId == old(wal.txnId)
        invariant ops == AppendOps(wal.txnId, DirtyWrites(pages, dirty, i))
      {
        ghost var ws := DirtyWrites(pages, dirty, i);
        if dirty[i] {
          if pages[i].Some? {
            ghost var op := wal.AppendPage(i, pages[i].value);
            ops := ops + [op];
            AppendOneMore(wal.txnId, ws, Write(i, pages[i].value));
          }
        }
        assert ws + [] == ws;
      }
      ghost var marker := wal.AppendCommit();
      ops := ops + marker;
    }

    /** The applying half of commit: write the dirty pages and clear their marks. */
    method ApplyDirty() returns (ghost ops: seq<IoOp>)
      requires Valid()
      modifies this`disk, this`dirty
      ensures |dirty| == MAX_PAGES && Clean()
      ensures disk == old(View())
      ensures ops == ApplyOps(DirtyWrites(pages, old(dirty), MAX_PAGES))
    {
      hide Replay, WriteAt;
      ghost var d0 := dirty;
      ops := [];
      ApplyNone();
      NoWrites(disk);
      for i := 0 to MAX_PAGES
        invariant |dirty| == MAX_PAGES && forall j :: 0 <= j < MAX_PAGES ==> dirty[j] == (i <= j && d0[j])
        invariant disk == Replay(old(disk), DirtyWrites(pages, d0, i))
        invariant ops == ApplyOps(DirtyWrites(pages, d0, i))
      {
        ghost var ws := DirtyWrites(pages, d0, i);
        if dirty[i] {
          if pages[i].Some? {
            var w := Write(i, pages[i].value);
            ReplayAppend(old(disk), ws, [w]);
            ReplayOne(disk, w);
            disk := WriteAt(disk, w);
            dirty := dirty[i := false];
            ops := ops + [DbWrite(w)];
            ApplyOneMore(ws, w);
          }
        }
        assert ws + [] == ws;
      }
      DirtyMakesView(old(disk), fileLength, pages, d0);
    }

    /** Log the dirty pages, sync the log, write the pages, sync the file, empty
        the log: afterwards the file equals the view. */
    method Commit() returns (ghost ops: seq<IoOp>)
      requires Valid()
      modifies this, wal
      ensures Valid() && Clean() && !inTransaction
      ensures View() == old(View()) && disk == old(View())
      ensures wal.file == [] && wal.txnId == old(wal.txnId) + 1
      ensures ops == CommitOps(old(wal.txnId), DirtyWrites(old(pages), old(dirty), MAX_PAGES))
      ensures CommitsTo(old(disk), old(View()), old(wal.txnId), ops)
    {
      hide DirtyWrites;
      ghost var logged := LogDirty();
      ghost var applied := ApplyDirty();
      ghost var op := wal.Truncate();
      ops := logged + applied + [DbSync, op];
      inTransaction := false;
      assert View() == disk;
    }

    /** Discard the dirty pages: afterwards the view equals the file. */
    method Rollback() returns (ghost ops: seq<IoOp>)
      requires Valid()
      modifies this, wal
      ensures Valid() && Clean() && !inTransaction
      ensures View() == disk == old(disk)
      ensures wal.file == [] && wal.txnId == old(wal.txnId)
      ensures ops == [WalTruncate]
    {
      ghost var d0, p0 := dirty, pages;
      for i := 0 to MAX_PAGES
        invariant disk == old(disk) && |dirty| == |pages| == MAX_PAGES && wal.txnId == old(wal.txnId)
        invariant forall j :: 0 <= j < MAX_PAGES ==> dirty[j] == (i <= j && d0[j])
        invariant forall j :: 0 <= j < MAX_PAGES ==> pages[j] == if j < i && d0[j] then None else p0[j]
      {
        if dirty[i] {
          pages := pages[i := None];
          dirty := dirty[i := false];
        }
      }
      fileLength := |disk|;
      ghost var op := wal.Truncate();
      ops := [op];
      inTransaction := false;
      assert View() == disk;
    }
  }

  lemma AppendOneMore(txn: nat, ws: seq<Write>, w: Write)
    ensures AppendOps(txn, ws + [w]) == AppendOps(txn, ws) + [WalAppend(PageBytes(txn, w))]
  {
    hide PageBytes;
  }

  lemma ApplyOneMore(ws: seq<Write>, w: Write)
    ensures ApplyOps(ws + [w]) == ApplyOps(ws) + [DbWrite(w)]
  {
  }

  lemma NoWrites(db: seq<Page>)
    ensures Replay(db, []) == db
  {
  }

  lemma ApplyNone()
    ensures ApplyOps([]) == []
  {
  }
}
