/** All open tables, and transactions over them. */
module Storage {
  import opened Bytes
  import opened Results
  import opened WalLog
  import opened Media
  import opened PageCache
  import opened Rows
  import opened Metadata
  import opened Tables
  import opened TableStores
  import opened StorageRuns

  ghost function StateOf(t: Table): TableState
    reads t, t.pager
  {
    TableState(t.columns, t.durable, |t.pager.disk|, t.live, |t.pager.View()|, t.pager.inTransaction)
  }

  /** The page file, the view over it and the transaction number of a table. */
  datatype Files = Files(disk: seq<Page>, view: seq<Page>, txn: nat)

  ghost function FilesOf(t: Table): Files
    reads t.pager, t.pager.wal
  {
    Files(t.pager.disk, t.pager.View(), t.pager.wal.txnId)
  }

  /** The files of these tables are as they were. */
  ghost predicate SameFiles(fs: map<Name, Files>, gs: map<Name, Files>, names: set<Name>) {
    names <= fs.Keys && names <= gs.Keys && forall n :: n in names ==> gs[n] == fs[n]
  }

  ghost predicate Commits(f: Files, ops: seq<IoOp>) {
    CommitsTo(f.disk, f.view, f.txn, ops)
  }

  /** ops holds, for exactly these tables, the I/O that commits their views. */
  ghost predicate AllCommit(fs: map<Name, Files>, ops: map<Name, seq<IoOp>>, names: set<Name>) {
    names <= fs.Keys && ops.Keys == names && forall n :: n in names ==> Commits(fs[n], ops[n])
  }

  /** On the way: the tables of names are still to do. */
  ghost predicate Logged(fs: map<Name, Files>, gs: map<Name, Files>, ops: map<Name, seq<IoOp>>, names: set<Name>, all: set<Name>) {
    names <= all && SameFiles(fs, gs, names) && AllCommit(fs, ops, all - names)
  }

  lemma FilesStart(fs: map<Name, Files>, all: set<Name>)
    requires all == fs.Keys
    ensures Logged(fs, fs, map[], all, all)
  {
    assert all - all == {};
  }

  lemma FilesNext(fs: map<Name, Files>, gs: map<Name, Files>, hs: map<Name, Files>, names: set<Name>, all: set<Name>,
                  n: Name, ops: map<Name, seq<IoOp>>, io: seq<IoOp>)
    requires Logged(fs, gs, ops, names, all) && SameFiles(gs, hs, all - {n})
    requires n in names && n in gs && Commits(gs[n], io)
    ensures Logged(fs, hs, ops[n := io], names - {n}, all)
  {
    hide Commits;
  }

  lemma AllLogged(fs: map<Name, Files>, gs: map<Name, Files>, ops: map<Name, seq<IoOp>>, all: set<Name>)
    requires Logged(fs, gs, ops, {}, all)
    ensures AllCommit(fs, ops, all)
  {
    hide Commits;
    assert all - {} == all;
  }

  lemma CommitRuns()
    ensures forall d: Db :: Runs(d, StorageRuns.Commit, StorageRuns.Committed(d))
    ensures forall d: Db :: StorageRuns.Committed(d).Keys == d.Keys
  {
  }

  lemma BeginRuns(d: Db)
    requires forall n :: n in d ==> !d[n].inTxn
    ensures Runs(d, StorageRuns.Begin, Begun(d))
  {
  }

  lemma BegunKeys(d: Db)
    ensures Begun(d).Keys == d.Keys
  {
  }

  lemma CreateRuns(d: Db, n: Name, cols: seq<Column>, root: nat)
    requires n !in d && 0 < root < MAX_PAGES
    ensures Runs(d, Create(n, cols), d[n := NewTable(cols, root)])
  {
    var d' := d[n := NewTable(cols, root)];
    assert d'[n] == NewTable(cols, root);
  }

  lemma OpenRuns(d: Db, n: Name, cols: seq<Column>, s: Snapshot, pages: nat)
    ensures Runs(d, Open(n, cols, s, pages), d[n := TableState(cols, s, pages, s, pages, false)])
  {
  }

  function Objects(t: Table): set<object> {
    {t, t.pager, t.pager.wal}
  }

  class Storage {
    var tables: map<Name, Table>
    ghost var Repr: set<object>

    ghost predicate Apart()
      reads this
    {
      && (forall n :: n in tables ==> Objects(tables[n]) <= Repr)
      && (forall n, m :: n in tables && m in tables && n != m ==> Objects(tables[n]) !! Objects(tables[m]))
      && this !in Repr
    }

    ghost predicate Valid()
      reads this, Repr
    {
      Apart() && forall n :: n in tables ==> tables[n].Valid()
    }

    ghost function State(): Db
      requires Apart()
      reads this, Repr
    {
      map n | n in tables :: StateOf(tables[n])
    }

    ghost function AllFiles(): map<Name, Files>
      requires Apart()
      reads this, Repr
    {
      map n | n in tables :: FilesOf(tables[n])
    }

    constructor ()
      ensures Valid() && State() == map[] && Repr == {}
    {
      tables := map[];
      Repr := {};
    }

    /** After a call on one table the others are as they were. */
    twostate lemma OneChanged(n: Name)
      requires old(Valid()) && n in tables && tables == old(tables) && Repr == old(Repr)
      requires tables[n].Valid()
      requires forall o :: o in Repr && o !in Objects(tables[n]) ==> unchanged(o)
      ensures Valid() && State() == old(State())[n := StateOf(tables[n])]
    {
      hide Table.Valid;
      forall m | m in tables && m != n ensures tables[m].Valid() && StateOf(tables[m]) == old(StateOf(tables[m])) {
        assert Objects(tables[m]) !! Objects(tables[n]);
        assert tables[m] in Objects(tables[m]) && tables[m].pager in Objects(tables[m]);
        assert tables[m].pager.wal in Objects(tables[m]);
        assert unchanged(tables[m]) && unchanged(tables[m].pager) && unchanged(tables[m].pager.wal);
      }
    }

    /** insert: only the named table changes; ops is the I/O of its flush. */
    method Insert(name: Name, values: seq<Value>) returns (r: Result<()>, ghost ops: seq<IoOp>)
      requires Valid()
      requires name in tables && Conforms(tables[name].columns, values) && |RowBytes(tables[name].columns, values)| <= MAX_ROW
        ==> Accepts(tables[name].live, CellFor(tables[name].columns, values))
      modifies Repr
      ensures Valid() && tables == old(tables)
      ensures name !in tables ==> r == Err(NoTable) && State() == old(State())
      ensures name in tables ==>
        var t := tables[name];
        var cols := old(t.columns);
        r ==
          if |values| != |cols| then Err(WrongArity)
          else if !Conforms(cols, values) then Err(WrongType)
          else if |RowBytes(cols, values)| > MAX_ROW then Err(RowTooLarge)
          else if NextFree(old(t.live), CellFor(cols, values), old(|t.pager.View()|)) > MAX_PAGES then Err(PageLimit)
          else Ok(())
      ensures name in tables ==>
        var t := tables[name];
        var cols := old(t.columns);
        var space := old(|t.pager.View()|) + 3 <= MAX_PAGES || RoomFor(old(t.live), CellFor(cols, values));
        Conforms(cols, values) && |RowBytes(cols, values)| <= MAX_ROW && space ==> r.Ok?
      ensures name in tables ==>
        var t := tables[name];
        && Runs(old(State()), StorageRuns.Insert(name, values, EndingOf(r, old(|t.pager.View()|))), State())
        && (r.Ok? && !t.pager.inTransaction ==> CommitsTo(old(t.pager.disk), t.pager.disk, old(t.pager.wal.txnId), ops))
    {
      hide RowBytes, Conforms, Accepts, TableOk, Consistent, After, Torn, NextFree, Shaped, Contents, Table.Valid,
        CommitsTo;
      ops := [];
      if name !in tables {
        return Err(NoTable), [];
      }
      var t := tables[name];
      ghost var a := StateOf(t);
      assert t in Objects(t) && t.pager in Objects(t) && t.pager.wal in Objects(t);
      LiveShape(t);
      r, ops := t.Insert(values);
      InsertState(a, StateOf(t), values, r);
      OneChanged(name);
    }

    method SelectAll(name: Name) returns (r: Result<(seq<seq<byte>>, seq<seq<Value>>)>)
      requires Valid()
      modifies Repr
      ensures Valid() && tables == old(tables) && State() == old(State())
      ensures name !in tables ==> r == Err(NoTable)
      ensures name in tables ==> r == Ok((Names(State()[name].columns), RowsOfTable(State()[name])))
    {
      hide TableOk, Consistent, Contents, Table.Valid;
      if name !in tables {
        return Err(NoTable);
      }
      var t := tables[name];
      ghost var a := StateOf(t);
      assert t in Objects(t) && t.pager in Objects(t) && t.pager.wal in Objects(t);
      var h, rows := t.SelectAll();
      r := Ok((h, rows));
      OneChanged(name);
      assert StateOf(t) == a;
    }

    /** create_table, given the files found under the table's path. */
    method CreateTable(name: Name, columns: seq<Column>, db: DbFile, log: seq<byte>) returns (r: Result<()>, ghost ops: seq<IoOp>)
      requires Valid() && MetaFits(columns)
      modifies this
      ensures Valid() && fresh(Repr - old(Repr))
      ensures r.Err? ==> tables == old(tables) && State() == old(State())
      ensures r ==
        if name in old(tables) then Err(TableExists)
        else if db.rest != [] then Err(CorruptFile)
        else if |Replay(db.pages, WalLog.Recovered(log))| > MAX_PAGES - 2 then Err(PageLimit)
        else Ok(())
      ensures r.Ok? ==>
        && Runs(old(State()), Create(name, columns), State())
        && CommitsTo(Replay(db.pages, WalLog.Recovered(log)), tables[name].pager.disk, 0, ops)
    {
      hide TableOk, Consistent, Contents, MetaFits, Replay, Recovered, Table.Valid, CommitsTo, StorageRuns.Runs;
      ops := [];
      if name in tables {
        return Err(TableExists), [];
      }
      var t;
      t, ops := Table.CreateTable(db, log, columns);
      if t.Err? {
        return Err(t.error), [];
      }
      CreateRuns(State(), name, columns, t.value.rootPage);
      AddTable(name, t.value);
      r := Ok(());
    }

    /** open_table; an open table of the same name is dropped. If the files open
        at all, the snapshot is the table that the replayed pages hold. */
    method OpenTable(name: Name, db: DbFile, log: seq<byte>, ghost cols: seq<Column>, ghost s: Snapshot) returns (r: Result<()>)
      requires Valid()
      requires db.rest == [] ==>
        var v := Replay(db.pages, WalLog.Recovered(log));
        ParseMeta(At(v, 0)).Some? && (ParseMeta(At(v, 0)).value.Ok? ==> TableOk(v, s.t.page, cols, s))
      modifies this
      ensures Valid() && fresh(Repr - old(Repr))
      ensures db.rest != [] ==> r == Err(CorruptFile)
      ensures db.rest == [] ==>
        r == match ParseMeta(At(Replay(db.pages, WalLog.Recovered(log)), 0)).value case Ok(_) => Ok(()) case Err(e) => Err(e)
      ensures r.Err? ==> State() == old(State())
      ensures r.Ok? ==> Runs(old(State()), Open(name, CutAll(cols), s, |Replay(db.pages, WalLog.Recovered(log))|), State())
    {
      hide TableOk, Consistent, Contents, Replay, Recovered, ParseMeta, Table.Valid, StorageRuns.Runs, CutAll;
      OpenRuns(State(), name, CutAll(cols), s, |Replay(db.pages, WalLog.Recovered(log))|);
      var t := Table.OpenTable(db, log, cols, s);
      if t.Err? {
        return Err(t.error);
      }
      AddTable(name, t.value);
      r := Ok(());
    }

    method AddTable(name: Name, t: Table)
      requires Valid() && t.Valid() && Objects(t) !! Repr && this !in Objects(t)
      modifies this
      ensures Valid() && Repr == old(Repr) + Objects(t) && tables == old(tables)[name := t]
      ensures State() == old(State())[name := StateOf(t)]
    {
      hide Table.Valid, StateOf;
      ghost var old0 := tables;
      tables := tables[name := t];
      Repr := Repr + Objects(t);
      forall n | n in tables ensures Objects(tables[n]) <= Repr && tables[n].Valid() {
        assert n != name ==> n in old0 && tables[n] == old0[n] && Objects(old0[n]) <= old(Repr);
      }
      forall n, m | n in tables && m in tables && n != m ensures Objects(tables[n]) !! Objects(tables[m]) {
        assert n != name ==> Objects(tables[n]) <= old(Repr);
        assert m != name ==> Objects(tables[m]) <= old(Repr);
      }
    }

    /** Valid, and on the way from d to target. */
    ghost predicate Midway(d: Db, target: Db, names: set<Name>)
      reads this, Repr
    {
      Valid() && names <= tables.Keys && Between(d, State(), target, names)
    }

    lemma ValidApart()
      requires Valid()
      ensures Apart()
    {
    }

    lemma MidwayStart(target: Db)
      requires Valid()
      ensures Apart() && State().Keys == AllFiles().Keys == tables.Keys
      ensures target.Keys == tables.Keys ==> Midway(State(), target, tables.Keys)
    {
      hide Table.Valid, StateOf, FilesOf;
      BetweenEnds(State(), State(), target);
    }

    lemma MidwayEnd(d: Db, target: Db)
      requires Midway(d, target, {})
      ensures Valid() && Apart() && State() == target
    {
      hide Table.Valid, StateOf;
      BetweenEnds(d, State(), target);
    }

    method RollbackTable(n: Name, ghost d: Db, ghost names: set<Name>)
      requires Midway(d, RolledBack(d), names) && n in names
      modifies Repr
      ensures Midway(d, RolledBack(d), names - {n}) && tables == old(tables) && Repr == old(Repr)
    {
      hide TableOk, Consistent, Table.Valid, Between;
      var t := tables[n];
      BetweenNext(d, State(), RolledBack(d), names, n);
      assert t in Objects(t) && t.pager in Objects(t) && t.pager.wal in Objects(t);
      t.Rollback();
      assert StateOf(t) == RolledBackTable(d[n]);
      OneChanged(n);
    }

    /** rollback, table by table in any order. */
    method Rollback()
      requires Valid()
      modifies Repr
      ensures Valid() && tables == old(tables)
      ensures Runs(old(State()), StorageRuns.Rollback, State())
    {
      hide Table.Valid, Apart, Valid, StateOf, State, Midway;
      ValidApart();
      MidwayStart(RolledBack(State()));
      ghost var d := State();
      var names := tables.Keys;
      while names != {}
        invariant tables == old(tables) && Repr == old(Repr) && Midway(d, RolledBack(d), names) && names <= tables.Keys
        decreases |names|
      {
        var n :| n in names;
        RollbackTable(n, d, names);
        names := names - {n};
      }
      MidwayEnd(d, RolledBack(d));
    }

    method CommitTable(n: Name, ghost d: Db, ghost names: set<Name>) returns (ghost ops: seq<IoOp>)
      requires Midway(d, StorageRuns.Committed(d), names) && n in names && Apart()
      modifies Repr
      ensures Midway(d, StorageRuns.Committed(d), names - {n}) && tables == old(tables) && Repr == old(Repr) && Apart()
      ensures SameFiles(old(AllFiles()), AllFiles(), tables.Keys - {n})
      ensures n in old(AllFiles()) && Commits(old(AllFiles())[n], ops)
    {
      hide TableOk, Consistent, Table.Valid, CommitsTo, Between;
      var t := tables[n];
      BetweenNext(d, State(), StorageRuns.Committed(d), names, n);
      assert t in Objects(t) && t.pager in Objects(t) && t.pager.wal in Objects(t);
      ops := t.Commit();
      assert StateOf(t) == CommittedTable(d[n]);
      OneChanged(n);
      OtherFiles(n);
    }

    twostate lemma OtherFiles(n: Name)
      requires old(Apart()) && Apart() && n in tables && tables == old(tables) && Repr == old(Repr)
      requires forall o :: o in Repr && o !in Objects(tables[n]) ==> unchanged(o)
      ensures SameFiles(old(AllFiles()), AllFiles(), tables.Keys - {n})
    {
      forall m | m in tables && m != n ensures FilesOf(tables[m]) == old(FilesOf(tables[m])) {
        assert Objects(tables[m]) !! Objects(tables[n]);
        assert tables[m].pager in Objects(tables[m]) && tables[m].pager.wal in Objects(tables[m]);
        assert unchanged(tables[m].pager) && unchanged(tables[m].pager.wal);
      }
    }

    /** commit, each table by itself, in any order; ops is the I/O by table. */
    method Commit() returns (ghost ops: map<Name, seq<IoOp>>)
      requires Valid()
      modifies Repr
      ensures Valid() && tables == old(tables)
      ensures Runs(old(State()), StorageRuns.Commit, State())
      ensures AllCommit(old(AllFiles()), ops, tables.Keys)
    {
      hide Table.Valid, Apart, Valid, StateOf, State, Midway, AllFiles, SameFiles, AllCommit, Commits, Logged,
        StorageRuns.Committed, StorageRuns.Runs;
      CommitRuns();
      ValidApart();
      MidwayStart(StorageRuns.Committed(State()));
      ghost var d, fs, all := State(), AllFiles(), tables.Keys;
      ops := map[];
      var names := tables.Keys;
      FilesStart(fs, all);
      while names != {}
        invariant tables == old(tables) && Repr == old(Repr) && names <= all == tables.Keys && Apart()
        invariant Midway(d, StorageRuns.Committed(d), names)
        invariant Logged(fs, AllFiles(), ops, names, all)
        decreases |names|
      {
        var n :| n in names;
        ghost var gs := AllFiles();
        ghost var io := CommitTable(n, d, names);
        FilesNext(fs, gs, AllFiles(), names, all, n, ops, io);
        ops := ops[n := io];
        names := names - {n};
      }
      AllLogged(fs, AllFiles(), ops, all);
      MidwayEnd(d, StorageRuns.Committed(d));
    }

    method BeginTable(n: Name, ghost d: Db, ghost names: set<Name>) returns (r: Result<()>)
      requires Midway(d, Begun(d), names) && n in names
      modifies Repr
      ensures Midway(d, Begun(d), names - {n}) && tables == old(tables) && Repr == old(Repr)
      ensures n in d && r == if d[n].inTxn then Err(InTransaction) else Ok(())
    {
      hide TableOk, Consistent, Table.Valid, Between;
      var t := tables[n];
      BetweenNext(d, State(), Begun(d), names, n);
      assert t in Objects(t) && t.pager in Objects(t) && t.pager.wal in Objects(t);
      r := t.Begin();
      assert StateOf(t) == BegunTable(d[n]);
      OneChanged(n);
    }

    /** begin, on every open table in any order; it stops at one that is in a
        transaction, and the tables before that have begun. */
    method Begin() returns (r: Result<()>)
      requires Valid()
      modifies Repr
      ensures Valid() && tables == old(tables)
      ensures r.Ok? <==> forall n :: n in tables ==> !old(State())[n].inTxn
      ensures r.Ok? ==> Runs(old(State()), StorageRuns.Begin, State())
      ensures r.Err? ==> r.error == InTransaction && exists names :: Midway(old(State()), Begun(old(State())), names)
    {
      hide Table.Valid, Apart, Valid, StateOf, State, Midway, AllFiles, StorageRuns.Runs, StorageRuns.Begun;
      ValidApart();
      ghost var d := State();
      BegunKeys(d);
      MidwayStart(Begun(d));
      var names := tables.Keys;
      while names != {}
        invariant tables == old(tables) && Repr == old(Repr) && names <= tables.Keys == d.Keys
        invariant Midway(d, Begun(d), names)
        invariant forall n :: n in tables && n !in names ==> !d[n].inTxn
        decreases |names|
      {
        var n :| n in names;
        r := BeginTable(n, d, names);
        if r.Err? {
          MidwayValid(d, Begun(d), names - {n});
          assert !forall m :: m in tables ==> !d[m].inTxn;
          return;
        }
        names := names - {n};
      }
      r := Ok(());
      MidwayEnd(d, Begun(d));
      BeginRuns(d);
    }

    lemma MidwayValid(d: Db, target: Db, names: set<Name>)
      requires Midway(d, target, names)
      ensures Valid()
    {
      hide Valid, Between;
    }
  }

  lemma LiveShape(t: Table)
    requires t.Valid()
    ensures Shaped(t.live, |t.pager.View()|) && |t.pager.View()| <= MAX_PAGES
  {
    hide Shaped;
  }

  /** The contract of a table's insertion, read as a statement. */
  lemma InsertState(a: TableState, b: TableState, vals: seq<Value>, r: Result<()>)
    requires Shaped(a.live, a.pages) && a.pages <= MAX_PAGES && b.columns == a.columns && b.inTxn == a.inTxn
    requires r.Ok? || r == Err(PageLimit) <==> Checked(a, vals)
    requires Checked(a, vals) ==> (r.Ok? <==> PagesAfter(a, vals) <= MAX_PAGES)
    requires r.Ok? ==>
      && b.live == After(a.live, CellFor(a.columns, vals), a.pages) && b.pages == PagesAfter(a, vals)
      && b.durable == (if a.inTxn then a.durable else b.live)
      && b.filePages == if a.inTxn then a.filePages else b.pages
    requires r == Err(PageLimit) && a.pages < MAX_PAGES ==>
      b == a.(live := Torn(a.live, CellFor(a.columns, vals), a.pages), pages := MAX_PAGES)
    requires r.Err? && (r == Err(PageLimit) ==> a.pages == MAX_PAGES) ==> b == a
    ensures Inserts(a, b, vals, EndingOf(r, a.pages))
  {
    hide Shaped, After, Torn, NextFree, Conforms, RowBytes, CellFor;
  }

  /** How the result of an insertion on that many pages reads. */
  ghost function EndingOf(r: Result<()>, pages: nat): Ending {
    if r.Ok? then Done else if r == Err(PageLimit) && pages < MAX_PAGES then HalfDone else Refused
  }
}
